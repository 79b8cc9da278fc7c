/**
 * The application's error type and how an error becomes an HTTP status and a
 * log level. Rocket's `Status::from_code` is given by the set of status codes
 * Rocket recognises; the error sources of the csv and reqwest crates are reduced
 * to what this code reads of them.
 */
module Error {
  import opened Wrappers

  /** Rust's `u16`, the width of an HTTP status code on both sides. */
  type U16 = x: int | 0 <= x < 0x1_0000

  /** A Rocket HTTP status. */
  datatype Status = Status(code: U16)

  const INTERNAL_SERVER_ERROR: Status := Status(500)

  /** A csv crate error; only its description is carried along. */
  datatype CsvError = CsvError(description: string)

  /** A reqwest error; `status` is what `reqwest::Error::status()` reports. */
  datatype ReqwestError = ReqwestError(status: Option<U16>)

  /** `ApiError`; the captured backtraces are not part of this model. */
  datatype ApiError = Csv(csvSource: CsvError) | Reqwest(reqwestSource: ReqwestError)

  /** The two `log::Level`s the source chooses between. */
  datatype Level = Error | Debug

  /** What a responder produces: the level the error was logged at, and the response result. */
  datatype Responded = Responded(logged: Level, response: Result<(), Status>)

  /**
   * Rocket's `Status::from_code`: a status exactly for the codes Rocket
   * recognises (`known`), carrying that same code.
   */
  function FromCode(known: set<U16>, code: U16): (s: Option<Status>)
    ensures s.Some? <==> code in known
    ensures s.Some? ==> s.value.code == code
  {
    if code in known then Some(Status(code)) else None
  }

  /**
   * `ApiError::to_status`: a CSV error is a 500; a reqwest error forwards the
   * upstream status when there is one and Rocket recognises it, and is a 500
   * otherwise.
   */
  function ToStatus(e: ApiError, known: set<U16>): (s: Status)
    ensures e.Csv? ==> s == INTERNAL_SERVER_ERROR
    ensures e.Reqwest? && e.reqwestSource.status.Some? && e.reqwestSource.status.value in known
            ==> s.code == e.reqwestSource.status.value
    ensures e.Reqwest? && (e.reqwestSource.status.None? || e.reqwestSource.status.value !in known)
            ==> s == INTERNAL_SERVER_ERROR
  {
    match e
    case Csv(_) => INTERNAL_SERVER_ERROR
    case Reqwest(source) =>
      var forwarded := if source.status.Some? then FromCode(known, source.status.value) else None;
      if forwarded.Some? then forwarded.value else INTERNAL_SERVER_ERROR
  }

  /**
   * The level `ApiError::log` logs at: `Error` exactly for server-error
   * statuses (500 and above), `Debug` for everything else.
   */
  function LogLevel(e: ApiError, known: set<U16>): (l: Level)
    ensures l == Level.Error <==> ToStatus(e, known).code >= 500
    ensures l == Debug <==> ToStatus(e, known).code < 500
  {
    if ToStatus(e, known).code >= 500 then Level.Error else Debug
  }

  /** Every CSV error is logged at `Error`. */
  lemma CsvLogsAtError(source: CsvError, known: set<U16>)
    ensures LogLevel(Csv(source), known) == Level.Error
  {
  }

  /** A forwarded client-error status (below 500) is logged at `Debug`. */
  lemma ForwardedClientErrorLogsAtDebug(code: U16, known: set<U16>)
    requires code in known && code < 500
    ensures ToStatus(Reqwest(ReqwestError(Some(code))), known) == Status(code)
    ensures LogLevel(Reqwest(ReqwestError(Some(code))), known) == Debug
  {
  }

  /**
   * `respond_to`: the error is logged, and the response is always an error
   * carrying the error's status; never a success.
   */
  function RespondTo(e: ApiError, known: set<U16>): (r: Responded)
    ensures r.response.Failure?
    ensures r.response.error == ToStatus(e, known)
    ensures r.response.error.code == 500
            || (e.Reqwest? && e.reqwestSource.status == Some(r.response.error.code))
    ensures r.logged == Level.Error <==> r.response.error.code >= 500
  {
    Responded(LogLevel(e, known), Failure(ToStatus(e, known)))
  }
}
