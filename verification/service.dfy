/**
 The save handler wired to the SQLite store, as the server's `main`
 routes it for `POST /url`, and the redirect handler composed with the
 store the way a server would route it for `GET /{alias}` (the program
 itself routes the redirect handler only in its tests). Each request is a
 pure function of the table before it, returning the reply and the table
 after it. Requests are taken one at a time.
 */
module Service {
  import opened Options
  import opened StoreErrors
  import opened ApiResponse
  import opened Sqlite
  import SaveHandler
  import RedirectHandler

  /** A reply together with the table the request left behind. */
  datatype Served<R> = Served(reply: R, table: Table)

  /** `POST /url` against the store. A request answered before the store
      call, and every failed save, leaves the table as it was; a
      successful one stores the request's url under the alias it reports. */
  function Save(t: Table, body: Option<SaveHandler.Request>, invalid: seq<FieldError>,
                generated: string, d: SaveDriver): (r: Served<SaveHandler.Reply>)
    ensures Valid(t) ==> Valid(r.table)
    ensures WellFormed(r.reply.base)
    ensures !IsSuccess(r.reply.base) ==> r.table == t
    ensures IsSuccess(r.reply.base) ==>
              && body.Some? && |invalid| == 0
              && r.reply.alias == (if body.value.alias == "" then generated else body.value.alias)
              && GetURL(r.table, r.reply.alias, NoGetFaults) == Ok(body.value.url)
  {
    match SaveHandler.Route(body, invalid, generated)
    case Answer(reply) => Served(reply, t)
    case Store(url, alias) =>
      var saved := SaveURL(t, url, alias, d);
      assert saved.result.Ok? ==> GetURL(saved.table, alias, NoGetFaults) == Ok(url) by {
        if saved.result.Ok? { SaveThenGet(t, url, alias, d); }
      }
      Served(SaveHandler.Respond(alias, saved.result), saved.table)
  }

  /** `GET /{alias}` against the store: the path alias goes to `GetURL`
      exactly as given, even when empty. */
  function Redirect(t: Table, alias: string, g: GetDriver): (r: RedirectHandler.Reply)
    ensures r.Redirect? <==> g.prepare.Done? && g.query.Done? && HasAlias(t, alias)
    ensures r.Redirect? ==> r.status == RedirectHandler.StatusFound
    ensures r.Redirect? ==>
              exists i :: 0 <= i < |t.rows| && t.rows[i].alias == alias && t.rows[i].url == r.location
    ensures g.prepare.Done? && g.query.Done? && !HasAlias(t, alias) ==>
              r == RedirectHandler.Json(Error(RedirectHandler.NotFound))
  {
    RedirectHandler.Respond(GetURL(t, alias, g))
  }

  /** A save that reports success is followed by a redirect to the saved
      url. */
  lemma SaveThenRedirect(t: Table, body: Option<SaveHandler.Request>, invalid: seq<FieldError>,
                         generated: string, d: SaveDriver)
    requires IsSuccess(Save(t, body, invalid, generated, d).reply.base)
    ensures var s := Save(t, body, invalid, generated, d);
            Redirect(s.table, s.reply.alias, NoGetFaults)
              == RedirectHandler.Redirect(RedirectHandler.StatusFound, body.value.url)
  {
  }

  /** Saving under an alias that is already taken answers "url already
      exists" (the store reports `ErrURLExists` for a taken alias) and
      leaves the table alone, whatever url is offered. */
  lemma SaveTakenAlias(t: Table, url: string, alias: string, d: SaveDriver)
    requires alias != "" && HasAlias(t, alias)
    requires d.prepareCount.Done?
    requires d.scanCount.Done? || (d.prepareInsert.Done? && d.execInsert.Done?)
    ensures Save(t, Some(SaveHandler.Request(url, alias)), [], "", d)
              == Served(SaveHandler.Failure(SaveHandler.UrlExists), t)
  {
    SaveExistingAlias(t, url, alias, d);
  }

  /** Submitting the same request twice: the first succeeds, the second is
      refused with "url already exists" and changes nothing. */
  lemma SaveTwice(t: Table, url: string, alias: string)
    requires alias != "" && !ViolatesUnique(t, alias, url)
    ensures var body := Some(SaveHandler.Request(url, alias));
            var first := Save(t, body, [], "", NoSaveFaults);
            && IsSuccess(first.reply.base)
            && Save(first.table, body, [], "", NoSaveFaults)
                 == Served(SaveHandler.Failure(SaveHandler.UrlExists), first.table)
  {
    var t' := SaveURL(t, url, alias, NoSaveFaults).table;
    assert t'.rows[|t.rows|].alias == alias;
    SaveExistingAlias(t', url, alias, NoSaveFaults);
  }

  /** A request without a url fails the "required" rule and never
      reaches the store; the reply names the field and the rule. */
  lemma MissingUrlIsNotStored(t: Table, alias: string, generated: string, d: SaveDriver)
    ensures var r := Save(t, Some(SaveHandler.Request("", alias)), [FieldError("required", "URL")], generated, d);
            r.table == t && r.reply.base.error == "field URL is a required field"
  {
    var e := FieldError("required", "URL");
    assert Messages([e]) == [FieldMessage(e)];
  }

  /** A request whose url fails the "url" rule never reaches the store;
      the reply names the field and the rule. */
  lemma InvalidUrlIsNotStored(t: Table, url: string, alias: string, generated: string, d: SaveDriver)
    ensures var r := Save(t, Some(SaveHandler.Request(url, alias)), [FieldError("url", "URL")], generated, d);
            r.table == t && r.reply.base.error == "field URL is not a valid URL"
  {
    var e := FieldError("url", "URL");
    assert Messages([e]) == [FieldMessage(e)];
  }
}
