/** The broker client (`RacionalService`): only how `login` and `getStocks`
    turn a failed HTTP call into the error they throw. The HTTP calls
    themselves are inputs: each arrives as the response body or the raw error. */
module Racional {
  import opened Wrappers

  const BadRequest: int := 400
  const Forbidden: int := 403

  /** The body of a successful login (the fields the model uses). */
  datatype LoginResponse = LoginResponse(idToken: string, refreshToken: string, expiresIn: string)

  /** One position of the portfolio (the fields the model uses). */
  datatype Position = Position(assetId: string, unrealizedPLPercent: real, unrealizedDayPLPercent: real)

  /** The HTTP response an axios error carries: its status and the body's
      `error.message`, when the body has one. */
  datatype HttpResponse = HttpResponse(status: int, errorMessage: Option<string>)

  /** What the HTTP call threw: an axios error, with or without a response,
      or anything else. */
  datatype RawError =
    | AxiosError(message: string, response: Option<HttpResponse>)
    | OtherError(message: string)

  /** What the service throws: its own `InvalidCredentials`, or the raw error
      unchanged. */
  datatype ServiceError = InvalidCredentials(message: string) | Rethrown(raw: RawError)

  /** The `message` property of a thrown error. */
  function Message(e: ServiceError): string {
    match e
    case InvalidCredentials(m) => m
    case Rethrown(raw) => raw.message
  }

  /** The status of the response an error carries, when it is an axios error
      with a response. */
  function Status(e: RawError): Option<int> {
    if e.AxiosError? && e.response.Some? then Some(e.response.value.status) else None
  }

  /** The `catch` block of `login`. */
  function ClassifyLoginError(e: RawError): (r: ServiceError)
    ensures r.InvalidCredentials? <==>
      Status(e) == Some(BadRequest) && e.response.value.errorMessage == Some("INVALID_PASSWORD")
    ensures r.InvalidCredentials? ==> r.message == "Invalid email or password"
    ensures r.Rethrown? ==> r.raw == e
  {
    if !e.AxiosError? then Rethrown(e)
    else if e.response.Some? && e.response.value.status == BadRequest
            && e.response.value.errorMessage == Some("INVALID_PASSWORD") then
      InvalidCredentials("Invalid email or password")
    else Rethrown(e)
  }

  /** The `catch` block of `getStocks`. */
  function ClassifyGetStocksError(e: RawError): (r: ServiceError)
    ensures r.InvalidCredentials? <==> Status(e) == Some(Forbidden)
    ensures r.InvalidCredentials? ==> r.message == "Invalid token"
    ensures r.Rethrown? ==> r.raw == e
  {
    if !e.AxiosError? then Rethrown(e)
    else if e.response.Some? && e.response.value.status == Forbidden then InvalidCredentials("Invalid token")
    else Rethrown(e)
  }

  /** `login`: the response body on success, the classified error otherwise. */
  function Login(call: Result<LoginResponse, RawError>): (r: Result<LoginResponse, ServiceError>)
    ensures call.Success? <==> r.Success?
    ensures call.Success? ==> r.value == call.value
    ensures call.Failure? ==> r.error == ClassifyLoginError(call.error)
  {
    match call
    case Success(body) => Success(body)
    case Failure(e) => Failure(ClassifyLoginError(e))
  }

  /** `getStocks`: the positions on success, the classified error otherwise. */
  function GetStocks(call: Result<seq<Position>, RawError>): (r: Result<seq<Position>, ServiceError>)
    ensures call.Success? <==> r.Success?
    ensures call.Success? ==> r.value == call.value
    ensures call.Failure? ==> r.error == ClassifyGetStocksError(call.error)
  {
    match call
    case Success(body) => Success(body)
    case Failure(e) => Failure(ClassifyGetStocksError(e))
  }

  /** The two mappings differ: a 403 while logging in and a 400 while
      fetching positions both pass through unchanged, whatever the body says. */
  lemma MappingsDiffer(message: string, body: Option<string>)
    ensures ClassifyLoginError(AxiosError(message, Some(HttpResponse(Forbidden, body))))
      == Rethrown(AxiosError(message, Some(HttpResponse(Forbidden, body))))
    ensures ClassifyGetStocksError(AxiosError(message, Some(HttpResponse(BadRequest, body))))
      == Rethrown(AxiosError(message, Some(HttpResponse(BadRequest, body))))
  {
  }

  /** Errors that are not axios errors, and axios errors without a response,
      pass through both mappings unchanged. */
  lemma UnansweredErrorsPassThrough(e: RawError)
    requires e.OtherError? || e.response.None?
    ensures ClassifyLoginError(e) == Rethrown(e)
    ensures ClassifyGetStocksError(e) == Rethrown(e)
  {
  }
}
