/**
 The delete handler (`DELETE /{alias}`), against its own store interface:
 `DeleteURL(alias) (string, error)`, which answers with the URL it deleted.
 The SQLite store's `DeleteURL` returns only an error, so this handler is
 not composed with the store model.
 */
module DeleteHandler {
  import opened StoreErrors
  import opened ApiResponse

  /** `deleter.Response`: the common body plus alias and url, each
      omitted when empty. */
  datatype Reply = Reply(base: Response, alias: string, url: string)

  /** Either the handler answers at once, or it calls `DeleteURL(alias)`. */
  datatype Step = Answer(reply: Reply) | Store(alias: string)

  const InvalidRequest := "invalid request"
  const NotFound := "not found"
  const InternalError := "internal error"

  function Failure(msg: string): (r: Reply)
    ensures WellFormed(r.base) && !IsSuccess(r.base)
    ensures r.base.error == msg && r.alias == "" && r.url == ""
  {
    Reply(Error(msg), "", "")
  }

  /** An empty path alias is rejected before the store is called; any
      other alias is passed on unchanged. */
  function Route(alias: string): (s: Step)
    ensures s.Answer? <==> alias == ""
    ensures s.Answer? ==> s.reply == Failure(InvalidRequest)
    ensures s.Store? ==> s.alias == alias
  {
    if alias == "" then Answer(Failure(InvalidRequest)) else Store(alias)
  }

  /** The reply to `DeleteURL`'s outcome: `ErrURLNotFound` anywhere in the
      chain is "not found", any other error "internal error"; a success
      echoes the alias and the URL the store returned. */
  function Respond(alias: string, result: Result<string>): (r: Reply)
    ensures WellFormed(r.base)
    ensures IsSuccess(r.base) <==> result.Ok?
    ensures result.Ok? ==> r == Reply(OK(), alias, result.value)
    ensures result.Err? && Is(result.error, URLNotFound) ==> r == Failure(NotFound)
    ensures result.Err? && !Is(result.error, URLNotFound) ==> r == Failure(InternalError)
  {
    match result
    case Err(e) =>
      if Is(e, URLNotFound) then Failure(NotFound) else Failure(InternalError)
    case Ok(url) => Reply(OK(), alias, url)
  }

  /** Wrapping the store's error in more context changes nothing. */
  lemma RespondSeesOnlyRoot(alias: string, e: StoreError)
    ensures Respond(alias, Err(e)) == Respond(alias, Err(Base(Root(e))))
  {
  }
}
