/** The API service's `GET /records/<id>` handler: read the hot store
    first; on the hot store's not-found error, ask the retrieval function
    once and translate its status.

    The hot read is given as its outcome. The retrieval function is a
    parameter from record id to reply; the handler returns, beside its
    response, the ids it asked the retrieval function for. */
module ApiService {
  import opened Records

  /** The outcome of `container.read_item(id)`. */
  datatype HotRead = HotHit(record: Record) | HotMiss | HotError

  /** The outcome of `requests.get` on the retrieval function: its status
      and body, or an exception (connection refused, timeout, ...). */
  datatype ColdReply = Reply(status: int, body: Body) | Unreachable

  /** The handler's response and the ids it sent to the retrieval function. */
  datatype Served = Served(response: Response, coldCalls: seq<string>)

  const NOT_FOUND_ERROR := "Record not found"
  const ARCHIVE_ERROR := "Failed to retrieve record from archive"
  const INTERNAL_ERROR := "Internal server error"

  /** Whether `response.json()` can parse the body. */
  predicate IsJson(b: Body) {
    b.RecordJson? || b.ErrorJson?
  }

  /** The handler. An exception raised inside the not-found handler (by
      `requests.get` or by `response.json()`) is not caught by the sibling
      `except Exception` clause, so it escapes to the web framework, which
      answers 500 with its own error page. */
  function GetRecord(id: string, hot: HotRead, coldService: string -> ColdReply): (served: Served)
    ensures hot.HotHit? ==> served == Served(Response(OK, RecordJson(hot.record)), [])
    ensures hot.HotError? ==> served == Served(Response(INTERNAL_SERVER_ERROR, ErrorJson(INTERNAL_ERROR)), [])
    ensures hot.HotMiss? ==> served.coldCalls == [id]
    ensures served.response.status in {OK, NOT_FOUND, INTERNAL_SERVER_ERROR}
    ensures served.response.status == OK <==>
      hot.HotHit? ||
      (hot.HotMiss? && coldService(id).Reply? && coldService(id).status == OK && IsJson(coldService(id).body))
    ensures hot.HotMiss? && served.response.status == OK ==> served.response.body == coldService(id).body
    ensures served.response.status == NOT_FOUND <==>
      hot.HotMiss? && coldService(id).Reply? && coldService(id).status == NOT_FOUND
  {
    match hot
    case HotHit(record) => Served(Response(OK, RecordJson(record)), [])
    case HotError => Served(Response(INTERNAL_SERVER_ERROR, ErrorJson(INTERNAL_ERROR)), [])
    case HotMiss =>
      var reply := coldService(id);
      var response :=
        match reply
        case Unreachable => Response(INTERNAL_SERVER_ERROR, ServerErrorPage)
        case Reply(status, body) =>
          if status == OK then
            if IsJson(body) then Response(OK, body) else Response(INTERNAL_SERVER_ERROR, ServerErrorPage)
          else if status == NOT_FOUND then Response(NOT_FOUND, ErrorJson(NOT_FOUND_ERROR))
          else Response(INTERNAL_SERVER_ERROR, ErrorJson(ARCHIVE_ERROR));
      Served(response, [id])
  }

  // -----------------------------------------------------------------------
  // Loading the service: the import of the not-found error class
  // -----------------------------------------------------------------------

  /** The two Azure SDK modules a not-found error class can be imported from. */
  datatype ErrorModule = AzureCoreExceptions | AzureCosmosExceptions

  /** The exception classes each module defines, among those a Cosmos client
      may raise. `azure.core.exceptions` has the generic
      `ResourceNotFoundError`; the Cosmos-specific subclass lives in
      `azure.cosmos.exceptions`. */
  function ExceptionClasses(m: ErrorModule): set<string> {
    match m
    case AzureCoreExceptions =>
      {"AzureError", "HttpResponseError", "ResourceExistsError", "ResourceNotFoundError",
       "ResourceModifiedError", "ClientAuthenticationError", "ServiceRequestError", "ServiceResponseError"}
    case AzureCosmosExceptions =>
      {"CosmosHttpResponseError", "CosmosResourceNotFoundError", "CosmosResourceExistsError",
       "CosmosAccessConditionFailedError", "CosmosClientTimeoutError"}
  }

  const NOT_FOUND_CLASS := "CosmosResourceNotFoundError"

  /** The module the service imports `CosmosResourceNotFoundError` from. */
  const IMPORTED_FROM := AzureCoreExceptions

  /** A request to the service whose module imports the not-found class from
      `m`: `from m import CosmosResourceNotFoundError` raises `ImportError`
      when `m` does not define that name, the module never finishes loading,
      no route is registered and no request gets an answer (`None`);
      otherwise the request is answered by `GetRecord`. */
  function Serve(m: ErrorModule, id: string, hot: HotRead, coldService: string -> ColdReply): (served: Option<Served>) {
    if NOT_FOUND_CLASS in ExceptionClasses(m) then Some(GetRecord(id, hot, coldService)) else None
  }

  /** As written, the service answers nothing at all, not even a hot hit:
      the import fails before the handler exists. */
  lemma ServiceAsWrittenNeverAnswers(id: string, hot: HotRead, coldService: string -> ColdReply)
    ensures NOT_FOUND_CLASS !in ExceptionClasses(IMPORTED_FROM)
    ensures Serve(IMPORTED_FROM, id, hot, coldService) == None
  {
  }

  /** With the class imported from the module that defines it, every request
      is answered by the handler `GetRecord`; a hot hit, for one, gets 200. */
  lemma ServiceWithImportFixedAnswers(id: string, hot: HotRead, coldService: string -> ColdReply)
    ensures Serve(AzureCosmosExceptions, id, hot, coldService) == Some(GetRecord(id, hot, coldService))
    ensures hot.HotHit? ==>
      Serve(AzureCosmosExceptions, id, hot, coldService).value.response == Response(OK, RecordJson(hot.record))
  {
  }
}
