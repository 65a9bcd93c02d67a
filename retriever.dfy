/** The HTTP-triggered retrieval function: given a record id from the URL
    path, it walks the listing of the blob container for the first blob
    whose name ends in `/<id>.json` and answers with that blob's content.

    The container is a listing (a sequence of blob names, in the order the
    storage service lists them) and a map from blob name to the record the
    blob holds. The one exception a storage call may raise is an input. */
module Retriever {
  import opened Records

  /** The storage exceptions the function tells apart: the service's
      not-found error, and anything else. */
  datatype StorageError = ResourceNotFound | OtherFailure

  /** Where the exception is raised, if anywhere: while fetching listing
      entry `at` (the listing is paged lazily; `at == |listing|` is the fetch
      after the last name, and a failure to connect is `at == 0`), or while
      downloading the blob that was found. */
  datatype Fault =
    | NoFault
    | ListingFails(at: nat, error: StorageError)
    | DownloadFails(error: StorageError)

  datatype BlobContainer = BlobContainer(listing: seq<string>, blobs: map<string, Record>)

  /** The outcome of the search loop: the blob name found, no name matched,
      or an exception escaped the listing. */
  datatype Search = Found(name: string) | NoMatch | Raised(error: StorageError)

  const MISSING_ID_MESSAGE := "Please pass a record ID in the URL path."
  const NOT_FOUND_MESSAGE := "Record not found."
  const INTERNAL_ERROR_MESSAGE := "Internal server error."

  predicate EndsWith(s: string, suffix: string) {
    |suffix| <= |s| && s[|s| - |suffix|..] == suffix
  }

  /** The test the search applies to a blob name. */
  predicate Matches(name: string, id: string) {
    EndsWith(name, "/" + id + ".json")
  }

  predicate ListingFailsAt(fault: Fault, j: nat) {
    fault.ListingFails? && fault.at == j
  }

  /** The search from listing position `from` on: the first listed name
      that matches, unless fetching an entry at or before it raises. */
  function FirstMatch(listing: seq<string>, id: string, fault: Fault, from: nat): (s: Search)
    requires from <= |listing|
    ensures s.Found? ==>
      exists k :: from <= k < |listing| && listing[k] == s.name && Matches(listing[k], id) &&
        (forall j :: from <= j < k ==> !Matches(listing[j], id)) &&
        (forall j :: from <= j <= k ==> !ListingFailsAt(fault, j))
    ensures s == NoMatch <==>
      (forall j :: from <= j < |listing| ==> !Matches(listing[j], id)) &&
      (forall j :: from <= j <= |listing| ==> !ListingFailsAt(fault, j))
    ensures s.Raised? ==>
      fault.ListingFails? && s.error == fault.error && from <= fault.at <= |listing| &&
      forall j :: from <= j < fault.at ==> !Matches(listing[j], id)
    decreases |listing| - from
  {
    if ListingFailsAt(fault, from) then Raised(fault.error)
    else if from == |listing| then NoMatch
    else if Matches(listing[from], id) then Found(listing[from])
    else FirstMatch(listing, id, fault, from + 1)
  }

  /** The search loop: it stops at the first matching name (`break`) and
      lets a listing exception escape. */
  method FindBlob(listing: seq<string>, id: string, fault: Fault) returns (s: Search)
    ensures s == FirstMatch(listing, id, fault, 0)
  {
    var blobFound: Option<string> := None;
    var i := 0;
    while i < |listing|
      invariant i <= |listing|
      invariant blobFound.None? ==> FirstMatch(listing, id, fault, 0) == FirstMatch(listing, id, fault, i)
      invariant blobFound.Some? ==> FirstMatch(listing, id, fault, 0) == Found(blobFound.value)
    {
      if ListingFailsAt(fault, i) {
        return Raised(fault.error);
      }
      if Matches(listing[i], id) {
        blobFound := Some(listing[i]);
        break;
      }
      i := i + 1;
    }
    if blobFound.Some? {
      return Found(blobFound.value);
    }
    if ListingFailsAt(fault, |listing|) {
      return Raised(fault.error);
    }
    return NoMatch;
  }

  /** How an escaping storage exception is answered. */
  function ErrorResponse(e: StorageError): (resp: Response) {
    match e
    case ResourceNotFound => Response(NOT_FOUND, Text(NOT_FOUND_MESSAGE))
    case OtherFailure => Response(INTERNAL_SERVER_ERROR, Text(INTERNAL_ERROR_MESSAGE))
  }

  predicate MissingId(routeId: Option<string>) {
    routeId.None? || routeId.value == ""
  }

  /** How the handler answers once the search is over: the one place that
      maps a search outcome, and the download that follows it, to a status. */
  function Respond(s: Search, container: BlobContainer, fault: Fault): (resp: Response) {
    match s
    case Raised(e) => ErrorResponse(e)
    case NoMatch => Response(NOT_FOUND, Text(NOT_FOUND_MESSAGE))
    case Found(name) =>
      if fault.DownloadFails? then ErrorResponse(fault.error)
      // a listed blob that is gone by the time it is downloaded
      else if name !in container.blobs then ErrorResponse(ResourceNotFound)
      else Response(OK, RecordJson(container.blobs[name]))
  }

  /** The response of the retrieval function, as a function of the route
      parameter, the container and the fault: the specification that
      `Retrieve` meets and that lemmas about reading an archived record use. */
  function Answer(routeId: Option<string>, container: BlobContainer, fault: Fault): (resp: Response)
    ensures resp.status in {OK, BAD_REQUEST, NOT_FOUND, INTERNAL_SERVER_ERROR}
    ensures resp.status == BAD_REQUEST <==> MissingId(routeId)
    ensures MissingId(routeId) ==> resp == Response(BAD_REQUEST, Text(MISSING_ID_MESSAGE))
    ensures resp.status == OK <==>
      !MissingId(routeId) && !fault.DownloadFails? &&
      var s := FirstMatch(container.listing, routeId.value, fault, 0);
      s.Found? && s.name in container.blobs
    ensures resp.status == OK ==>
      resp.body == RecordJson(container.blobs[FirstMatch(container.listing, routeId.value, fault, 0).name])
    ensures resp.status == INTERNAL_SERVER_ERROR <==>
      !MissingId(routeId) &&
      var s := FirstMatch(container.listing, routeId.value, fault, 0);
      s == Raised(OtherFailure) || (s.Found? && fault == DownloadFails(OtherFailure))
  {
    if MissingId(routeId) then Response(BAD_REQUEST, Text(MISSING_ID_MESSAGE))
    else Respond(FirstMatch(container.listing, routeId.value, fault, 0), container, fault)
  }

  /** The retrieval function's handler: the id check, the search loop, and
      the answer to its outcome. */
  method Retrieve(routeId: Option<string>, container: BlobContainer, fault: Fault) returns (resp: Response)
    ensures resp == Answer(routeId, container, fault)
  {
    if MissingId(routeId) {
      return Response(BAD_REQUEST, Text(MISSING_ID_MESSAGE));
    }
    var recordId := routeId.value;
    var search := FindBlob(container.listing, recordId, fault);
    resp := Respond(search, container, fault);
  }

  /** The first matching name in listing order is the one served; any later
      match is ignored. */
  lemma FirstListedMatchIsServed(container: BlobContainer, id: string, k: nat)
    requires id != "" && k < |container.listing|
    requires Matches(container.listing[k], id) && container.listing[k] in container.blobs
    requires forall j :: 0 <= j < k ==> !Matches(container.listing[j], id)
    ensures Answer(Some(id), container, NoFault) ==
      Response(OK, RecordJson(container.blobs[container.listing[k]]))
  {
    var s := FirstMatch(container.listing, id, NoFault, 0);
    assert s != NoMatch;
  }

  /** With no listed name ending in `/<id>.json`, the answer is 404. */
  lemma NoMatchingNameIsNotFound(container: BlobContainer, id: string)
    requires id != ""
    requires forall j :: 0 <= j < |container.listing| ==> !Matches(container.listing[j], id)
    ensures Answer(Some(id), container, NoFault) == Response(NOT_FOUND, Text(NOT_FOUND_MESSAGE))
  {
  }
}
