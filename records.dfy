/** Shared data of the billing-record store: the record itself, the calendar
    date it was created on, and the bodies of the HTTP responses that the
    retrieval function and the API service send back. */
module Records {

  datatype Option<T> = None | Some(value: T)

  /** The calendar part of a record's `createdAt` timestamp. */
  datatype Date = Date(year: int, month: int, day: int)

  /** A billing record as stored in the hot tier (a Cosmos DB item) and, as
      JSON, in the cold tier (a blob). `fields` stands for the rest of the
      document, which nothing here interprets; `ttl` is the item's
      time-to-live attribute, absent until the archiver sets it. */
  datatype Record = Record(
    id: string,
    created: Date,
    fields: map<string, string>,
    ttl: Option<int>)

  /** Body of an HTTP response: a record rendered as JSON, a plain-text
      message, a JSON object `{"error": ...}`, or the web framework's own
      error page when a handler raises an exception it does not catch. */
  datatype Body =
    | RecordJson(record: Record)
    | Text(message: string)
    | ErrorJson(error: string)
    | ServerErrorPage

  datatype Response = Response(status: int, body: Body)

  /** HTTP status codes used by the services (sections 15.3.1, 15.5.1,
      15.5.5 and 15.6.1 of RFC 9110). */
  const OK := 200
  const BAD_REQUEST := 400
  const NOT_FOUND := 404
  const INTERNAL_SERVER_ERROR := 500

  predicate IsLeapYear(y: int) {
    y % 4 == 0 && (y % 100 != 0 || y % 400 == 0)
  }

  function DaysInMonth(y: int, m: int): (n: int)
    requires 1 <= m <= 12
    ensures 28 <= n <= 31
  {
    if m == 2 then (if IsLeapYear(y) then 29 else 28)
    else if m == 4 || m == 6 || m == 9 || m == 11 then 30
    else 31
  }

  /** A date that a Python `datetime` can hold: years 1 to 9999 and a day
      that exists in its month. Parsing any other `createdAt` raises. */
  predicate ValidDate(d: Date) {
    1 <= d.year <= 9999 && 1 <= d.month <= 12 && 1 <= d.day <= DaysInMonth(d.year, d.month)
  }

  /** True when `s` contains no '/'; identifiers taken from a URL path
      segment are of this kind. */
  predicate NoSlash(s: string) {
    forall i :: 0 <= i < |s| ==> s[i] != '/'
  }
}
