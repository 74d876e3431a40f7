/**
 * `BackendClient`: fetches the species list and the sightings from the duck
 * backend and saves new sightings. The client's only state is the list of
 * species the backend allows, replaced wholesale by each successful species
 * fetch and consulted before a sighting is saved.
 *
 * Each asynchronous task is modelled as one sequential step: the outcome of
 * the network work (and of Gson's decoding) is a parameter, and what the
 * listener would be told is the result.
 */
module Backend {
  import opened JavaLang
  import opened SpeciesModel
  import opened SightingModel
  import opened Transport

  const InvalidUriMessage := "Invalid backend URI!"
  const DataGettingFailedMessage := "Data getting failed!"
  const SpeciesNeededMessage := "Get species before saving a new sighting!"
  const SaveFailedMessage := "Sighting save failed!"

  function UnsupportedSpeciesMessage(name: string): string {
    "Backend does not support species \"" + name + "\"!"
  }

  /** The backend's endpoint URI (resolution of paths against it is not modelled). */
  datatype Uri = Uri(text: string)

  /** What Gson makes of a response body: a list, or a `JsonSyntaxException`. */
  datatype Decoded<T> = Parsed(items: seq<T>) | Malformed

  /**
   * What reaches `onPostExecute`: `null` when `getRawText` threw an
   * `IOException`, otherwise the body, as Gson decodes it.
   */
  datatype GetResponse<T> = ReadFailed | Received(decoded: Decoded<T>)

  /**
   * What the listener of a fetch hears: the list (`gotSpecies`,
   * `gotSightings`), an error message (`gotError`), or nothing, because
   * Gson's exception escapes `onPostExecute`.
   */
  datatype Delivery<T> = Delivered(items: seq<T>) | DeliveredError(msg: string) | Thrown

  /** The synchronous checks of `saveSighting`: go on with the POST, or report `saveFailed` at once. */
  datatype Gate = Proceed | Rejected(msg: string)

  /** What the `SightingSaveListener` hears: `saveCompleted` or `saveFailed(msg)`. */
  datatype SaveResult = SaveCompleted | SaveFailed(msg: string)

  /** The `BackendClient` constructor either returns a client or throws `InvalidParameterException`. */
  datatype Creation = Created(client: BackendClient) | InvalidParameter(msg: string)

  predicate IsParsed<T>(resp: GetResponse<T>) {
    resp.Received? && resp.decoded.Parsed?
  }

  /** The `onPostExecute` of both fetches, as the listener sees it. */
  function Deliver<T>(resp: GetResponse<T>): (d: Delivery<T>)
    ensures d.Delivered? <==> IsParsed(resp)
    ensures d.Delivered? ==> d.items == resp.decoded.items
    ensures d.DeliveredError? <==> resp.ReadFailed?
    ensures d.DeliveredError? ==> d.msg == DataGettingFailedMessage
  {
    match resp
    case ReadFailed => DeliveredError(DataGettingFailedMessage)
    case Received(Malformed) => Thrown
    case Received(Parsed(items)) => Delivered(items)
  }

  /**
   * The allowed species after one species fetch: exactly the decoded list
   * when decoding succeeded, the previous list otherwise.
   */
  function WhitelistAfter(whitelist: seq<Species>, resp: GetResponse<Species>): (w: seq<Species>)
    ensures IsParsed(resp) ==> w == resp.decoded.items
    ensures !IsParsed(resp) ==> w == whitelist
  {
    if IsParsed(resp) then resp.decoded.items else whitelist
  }

  /** The allowed species after a series of species fetches completed in the given order. */
  function WhitelistAfterAll(whitelist: seq<Species>, resps: seq<GetResponse<Species>>): seq<Species> {
    if resps == [] then whitelist
    else WhitelistAfter(WhitelistAfterAll(whitelist, resps[..|resps| - 1]), resps[|resps| - 1])
  }

  /** The list decoded by the last successful species fetch among `resps`, if any. */
  function LatestSpeciesList(resps: seq<GetResponse<Species>>): (r: Option<seq<Species>>)
    ensures r.Some? <==> exists i :: 0 <= i < |resps| && IsParsed(resps[i])
    ensures r.Some? ==> exists i :: 0 <= i < |resps| && IsParsed(resps[i]) && resps[i].decoded.items == r.value
                                    && forall j :: i < j < |resps| ==> !IsParsed(resps[j])
  {
    if resps == [] then None
    else if IsParsed(resps[|resps| - 1]) then Some(resps[|resps| - 1].decoded.items)
    else LatestSpeciesList(resps[..|resps| - 1])
  }

  /**
   * The whitelist is always the list from the most recent successful
   * species fetch (the initial one when there was none): failed fetches and
   * fetches with a malformed body leave no trace.
   */
  lemma {:induction false} WhitelistIsLatestSuccessfulFetch(whitelist: seq<Species>, resps: seq<GetResponse<Species>>)
    ensures WhitelistAfterAll(whitelist, resps) ==
      match LatestSpeciesList(resps)
      case Some(items) => items
      case None => whitelist
  {
    if resps != [] {
      WhitelistIsLatestSuccessfulFetch(whitelist, resps[..|resps| - 1]);
    }
  }

  /** What the background task of `saveSighting` reports once the POST has been attempted. */
  function SaveResultAfterPost(post: PostOutcome): (r: SaveResult)
    ensures r == SaveCompleted <==> PostSucceeded(post)
    ensures r.SaveFailed? ==> r.msg == SaveFailedMessage
  {
    if PostSucceeded(post) then SaveCompleted else SaveFailed(SaveFailedMessage)
  }

  class BackendClient {
    const backendUri: Uri
    var allowedSpecies: seq<Species>

    /** The body of the Java constructor once the URI is known to be non-null. */
    constructor (backendUri: Uri)
      ensures this.backendUri == backendUri && allowedSpecies == []
    {
      this.backendUri := backendUri;
      allowedSpecies := [];
    }

    /** Some allowed species equals `species` (by name). */
    ghost predicate Supports(species: Species)
      reads this, allowedSpecies, species
    {
      exists i :: 0 <= i < |allowedSpecies| && allowedSpecies[i].Equals(species)
    }

    /**
     * `getSpecies`, from the response on: a decoded list replaces the
     * allowed species before the listener gets it; a failed read reports
     * "Data getting failed!" and keeps the old list.
     */
    method OnSpeciesResponse(resp: GetResponse<Species>) returns (d: Delivery<Species>)
      modifies this
      ensures allowedSpecies == WhitelistAfter(old(allowedSpecies), resp)
      ensures d == Deliver(resp)
    {
      match resp
      case ReadFailed =>
        d := DeliveredError(DataGettingFailedMessage);
      case Received(Malformed) =>
        d := Thrown;
      case Received(Parsed(species)) =>
        allowedSpecies := species;
        d := Delivered(species);
    }

    /**
     * `getSightings`, from the response on. It changes nothing in the
     * client (it has no `modifies` clause): the allowed species stay as
     * they were, and the species inside the sightings are not checked
     * against them.
     */
    method OnSightingsResponse(resp: GetResponse<Sighting>) returns (d: Delivery<Sighting>)
      ensures d == Deliver(resp)
    {
      match resp
      case ReadFailed =>
        d := DeliveredError(DataGettingFailedMessage);
      case Received(Malformed) =>
        d := Thrown;
      case Received(Parsed(sightings)) =>
        d := Delivered(sightings);
    }

    /**
     * The synchronous checks at the start of `saveSighting`: the species
     * list must have been fetched, and the sighting's species must equal one
     * of its entries; the search stops at the first match.
     */
    method CheckSave(sighting: Sighting) returns (g: Gate)
      ensures g == Proceed <==> Supports(sighting.species)
      ensures |allowedSpecies| == 0 ==> g == Rejected(SpeciesNeededMessage)
      ensures |allowedSpecies| > 0 && !Supports(sighting.species) ==>
                g == Rejected(UnsupportedSpeciesMessage(sighting.species.GetName()))
    {
      if |allowedSpecies| == 0 {
        return Rejected(SpeciesNeededMessage);
      }
      var allowed := false;
      var specToSave := sighting.species;
      var i := 0;
      while i < |allowedSpecies|
        invariant 0 <= i <= |allowedSpecies|
        invariant !allowed
        invariant forall j :: 0 <= j < i ==> !allowedSpecies[j].Equals(specToSave)
      {
        if allowedSpecies[i].Equals(specToSave) {
          allowed := true;
          break;
        }
        i := i + 1;
      }
      if !allowed {
        return Rejected(UnsupportedSpeciesMessage(specToSave.GetName()));
      }
      g := Proceed;
    }

    /**
     * `saveSighting`: when the checks pass, the sighting is POSTed (the
     * server's answer is `post`) and the listener hears `saveCompleted`
     * exactly when the answer was 200, `saveFailed("Sighting save failed!")`
     * otherwise. When a check fails nothing is POSTed.
     */
    method SaveSighting(sighting: Sighting, post: PostOutcome) returns (r: SaveResult, posted: bool)
      ensures posted <==> Supports(sighting.species)
      ensures |allowedSpecies| == 0 ==> r == SaveFailed(SpeciesNeededMessage)
      ensures |allowedSpecies| > 0 && !posted ==>
                r == SaveFailed(UnsupportedSpeciesMessage(sighting.species.GetName()))
      ensures posted ==> (r == SaveCompleted <==> post == Responded(HttpOk))
      ensures posted && r.SaveFailed? ==> r.msg == SaveFailedMessage
    {
      var g := CheckSave(sighting);
      match g
      case Rejected(msg) =>
        r, posted := SaveFailed(msg), false;
      case Proceed =>
        r, posted := SaveResultAfterPost(post), true;
    }
  }

  /** `new BackendClient(uri)`: a `null` URI is refused; otherwise the client starts with no allowed species. */
  method NewBackendClient(uri: Option<Uri>) returns (c: Creation)
    ensures c.InvalidParameter? <==> uri.None?
    ensures c.InvalidParameter? ==> c.msg == InvalidUriMessage
    ensures c.Created? ==> fresh(c.client) && c.client.backendUri == uri.value && c.client.allowedSpecies == []
  {
    if uri.None? {
      return InvalidParameter(InvalidUriMessage);
    }
    var client := new BackendClient(uri.value);
    c := Created(client);
  }

  /** Every species in a non-empty whitelist can be saved; nothing can be saved before a species fetch. */
  lemma SupportsNeedsWhitelist(client: BackendClient, species: Species)
    ensures client.Supports(species) ==> |client.allowedSpecies| > 0
    ensures (exists i :: 0 <= i < |client.allowedSpecies| && client.allowedSpecies[i].GetName() == species.GetName())
            <==> client.Supports(species)
  {
  }

  /**
   * With only "Mallard" fetched, saving a sighting of "Teal" is refused
   * with the species' name in the message, and nothing is POSTed.
   */
  method SaveOfUnlistedSpeciesIsRefused(post: PostOutcome) returns (r: SaveResult, posted: bool)
    ensures !posted
    ensures r == SaveFailed("Backend does not support species \"Teal\"!")
  {
    var client := new BackendClient(Uri("http://host/api/"));
    var mallard := new Species("Mallard");
    var _ := client.OnSpeciesResponse(Received(Parsed([mallard])));
    var teal := new Species("Teal");
    assert !mallard.Equals(teal) by { assert mallard.name[0] != teal.name[0]; }
    r, posted := client.SaveSighting(Sighting(None, DateTime(0), "", teal, 1), post);
  }
}
