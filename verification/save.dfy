/**
 The save handler (`POST /url`): decode, validate, pick the alias, call the
 store, and turn its outcome into a JSON reply.

 The handler is split at the store call. `Route` decides, from the decoded
 body and the validator's findings, whether to answer at once or which
 `(url, alias)` to hand to `SaveURL`; `Respond` turns the store's answer
 into the reply. JSON decoding, the validator's URL grammar and the random
 alias generator are inputs: the body (`None` when decoding failed), the
 validator's failed rules, and the string the generator would return.
 */
module SaveHandler {
  import opened Options
  import opened StoreErrors
  import opened ApiResponse

  /** The decoded request body. */
  datatype Request = Request(url: string, alias: string)

  /** `save.Response`: the common body plus the alias, omitted when empty. */
  datatype Reply = Reply(base: Response, alias: string)

  /** Either the handler answers without touching the store, or it calls
      `SaveURL(url, alias)`. */
  datatype Step = Answer(reply: Reply) | Store(url: string, alias: string)

  const DecodeFailed := "failed to decode request"
  const UrlExists := "url already exists"
  const AliasTaken := "alias already exists, please try again"
  const AddFailed := "failed to add url"

  function Failure(msg: string): (r: Reply)
    ensures WellFormed(r.base) && !IsSuccess(r.base)
    ensures r.base.error == msg && r.alias == ""
  {
    Reply(Error(msg), "")
  }

  /** Everything before the store call. A body that does not decode, or a
      request the validator rejects, is answered at once; otherwise the
      store is called with the request's url and its alias, or the
      generated alias when the request left it empty. */
  function Route(body: Option<Request>, invalid: seq<FieldError>, generated: string): (s: Step)
    ensures s.Store? <==> body.Some? && |invalid| == 0
    ensures s.Answer? ==> WellFormed(s.reply.base) && !IsSuccess(s.reply.base)
    ensures body.None? ==> s == Answer(Failure(DecodeFailed))
    ensures body.Some? && |invalid| > 0 ==> s == Answer(Reply(ValidationError(invalid), ""))
    ensures s.Store? ==> s.url == body.value.url
    ensures s.Store? && body.value.alias != "" ==> s.alias == body.value.alias
    ensures s.Store? && body.value.alias == "" ==> s.alias == generated
  {
    match body
    case None => Answer(Failure(DecodeFailed))
    case Some(req) =>
      if |invalid| > 0 then Answer(Reply(ValidationError(invalid), ""))
      else
        var alias := if req.alias == "" then generated else req.alias;
        Store(req.url, alias)
  }

  /** Everything after the store call. Errors are classified with
      `errors.Is`: `ErrURLExists` first, then `ErrAliasExists`, then
      anything else; a success echoes the alias the store was called with. */
  function Respond(alias: string, result: Result<int>): (r: Reply)
    ensures WellFormed(r.base)
    ensures IsSuccess(r.base) <==> result.Ok?
    ensures result.Ok? ==> r == Reply(OK(), alias)
    ensures result.Err? && Is(result.error, URLExists) ==> r == Failure(UrlExists)
    ensures result.Err? && Is(result.error, AliasExists) ==> r == Failure(AliasTaken)
    ensures result.Err? && !Is(result.error, URLExists) && !Is(result.error, AliasExists) ==>
              r == Failure(AddFailed)
  {
    match result
    case Err(e) =>
      // An error has one root, so at most one of the sentinels matches.
      assert !(Is(e, URLExists) && Is(e, AliasExists)) by { var _ := Root(e); }
      if Is(e, URLExists) then Failure(UrlExists)
      else if Is(e, AliasExists) then Failure(AliasTaken)
      else Failure(AddFailed)
    case Ok(_) => Reply(OK(), alias)
  }

  /** However many context layers the store adds, the reply depends only
      on the error's root. */
  lemma RespondSeesOnlyRoot(alias: string, e: StoreError)
    ensures Respond(alias, Err(e)) == Respond(alias, Err(Base(Root(e))))
  {
  }
}
