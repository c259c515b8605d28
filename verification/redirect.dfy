/**
 The redirect handler (`GET /{alias}`): look the alias up and either
 redirect to the stored URL or answer with a JSON error.
 */
module RedirectHandler {
  import opened StoreErrors
  import opened ApiResponse

  /** What the handler writes: a JSON body, or a call of `http.Redirect`
      with a location and a status. */
  datatype Reply = Json(body: Response) | Redirect(status: int, location: string)

  /** `http.StatusFound`. */
  const StatusFound := 302

  const NotFound := "not found"
  const InternalError := "internal error"

  /** The reply to `GetURL`'s outcome: `ErrURLNotFound` anywhere in the
      chain is "not found", any other error is "internal error", and a URL
      is handed to `http.Redirect` unchanged with status 302 (how that
      call escapes or resolves the URL is not modelled). */
  function Respond(result: Result<string>): (r: Reply)
    ensures r.Redirect? <==> result.Ok?
    ensures result.Ok? ==> r == Redirect(StatusFound, result.value)
    ensures r.Json? ==> WellFormed(r.body) && !IsSuccess(r.body)
    ensures result.Err? && Is(result.error, URLNotFound) ==> r == Json(Error(NotFound))
    ensures result.Err? && !Is(result.error, URLNotFound) ==> r == Json(Error(InternalError))
  {
    match result
    case Err(e) =>
      if Is(e, URLNotFound) then Json(Error(NotFound)) else Json(Error(InternalError))
    case Ok(url) => Redirect(StatusFound, url)
  }

  /** Wrapping the store's error in more context changes nothing. */
  lemma RespondSeesOnlyRoot(e: StoreError)
    ensures Respond(Err(e)) == Respond(Err(Base(Root(e))))
  {
  }
}
