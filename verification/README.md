# URL shortener: store and handlers in Dafny

This project models the core of a small URL-shortening HTTP service written
in Go. The service keeps one SQLite table `url(ID, alias, url)` with `alias`
and `url` both `UNIQUE`. The repository has three handlers:

- save: stores a url under a requested or generated alias;
- redirect: looks an alias up and redirects to the stored url;
- delete: removes an alias.

The program's `main` routes only the save handler, as `POST /url`
(cmd/url-shortener/main.go:58). The redirect handler is routed only in its
test, against a mock store, and no route exists for the delete handler.

Every handler answers with a small JSON body built by `OK`, `Error` or
`ValidationError`.

The model is functional. The table is an immutable sequence of records.
Each store operation is a pure function of the table, its arguments and a
record of how each SQL driver call went (`Step = Done | Failed(reason)`).
Operations that write return the new table along with their result. Each
handler is split at its store call:

- `Route` decides whether to answer at once or what to pass to the store;
- `Respond` maps the store's outcome to the reply.

The `Service` module wires the save handler to the store as `main` does,
and composes the redirect handler with the store the way a server would
route it. Errors are `Base(kind)` values, optionally wrapped with
context text the way `fmt.Errorf("%s: %w", ...)` wraps them. `Is` walks the
chain the way `errors.Is` does.

Files:

- `option.dfy` (`Options`): the optional value used by several modules.
- `errors.dfy` (`StoreErrors`): error kinds, wrapping, classification.
- `sqlite.dfy` (`Sqlite`): the table, its invariant, `SaveURL`, `GetURL`,
  `DeleteURL`, and the lemmas relating them.
- `response.dfy` (`ApiResponse`): `OK`, `Error`, `ValidationError`, the
  per-field messages and `strings.Join`.
- `save.dfy`, `redirect.dfy`, `deleter.dfy`: the three handlers.
- `service.dfy` (`Service`): save and redirect composed with the store.

Behaviour kept as the code has it:

- A save under an alias that is already taken fails with `ErrURLExists`, not
  `ErrAliasExists`. Both the pre-check and the insert's UNIQUE violation
  report `ErrURLExists`. The store never produces `ErrAliasExists`, so the
  save handler's "alias already exists" branch is unreachable with this
  store. It is still modelled in `SaveHandler.Respond`.
- Deleting an alias that is not in the table succeeds. No error is returned.
- A failed scan of the pre-check count is ignored. The count keeps Go's zero
  value and the insert runs anyway.
- The store does not reject empty aliases or urls. Only the save handler's
  validator and alias generator stand in front of it.
- `GetURL` returns the bare `ErrURLNotFound` sentinel with no operation
  name. Every other store error carries the operation name.

## Model

| member | source | states |
|---|---|---|
| StoreErrors.Root | internal/http-server/handlers/url/save/save.go:70-88 | every error has one root kind; `errors.Is` holds for that kind and for no other, so at most one sentinel branch of a handler can match |
| StoreErrors.Is | internal/http-server/handlers/url/save/save.go:71 | `errors.Is` against a sentinel holds exactly when some error in the unwrap chain (the error, then what unwrapping it repeatedly gives) is that sentinel |
| StoreErrors.Wrap | internal/config/storage/sqlite/sqlite.go:56 | wrapping an error with the operation name keeps its root and its `errors.Is` classification |
| Sqlite.Empty | internal/config/storage/sqlite/sqlite.go:26-31 | the table the schema creates is empty and satisfies the uniqueness invariant |
| Sqlite.NextId | internal/config/storage/sqlite/sqlite.go:28 | the rowid for a new row is positive and larger than every id in the table, so it is unused |
| Sqlite.CountAlias | internal/config/storage/sqlite/sqlite.go:48-54 | the pre-check count is zero exactly when no row has the alias |
| Sqlite.Find | internal/config/storage/sqlite/sqlite.go:82-88 | the lookup returns a row of the table with that alias, and returns nothing exactly when no row has it |
| Sqlite.RemoveAlias | internal/config/storage/sqlite/sqlite.go:102-106 | the delete keeps exactly the rows with other aliases, and changes nothing when the alias is absent |
| Sqlite.RemoveAliasKeepsDistinct | internal/config/storage/sqlite/sqlite.go:26-31 | deleting rows keeps ids, aliases and urls pairwise distinct |
| Sqlite.SaveURL | internal/config/storage/sqlite/sqlite.go:46-78 | succeeds exactly when the driver calls go through and neither alias nor url is taken; on success it appends one row with a fresh id and returns that id; every error leaves the table unchanged, carries the operation name, and is `ErrURLExists` or a driver error; the uniqueness invariant is preserved |
| Sqlite.GetURL | internal/config/storage/sqlite/sqlite.go:80-98 | returns the url of the row with the alias exactly when the driver calls go through and the alias is present; an absent alias gives the bare `ErrURLNotFound`; every other error is a driver error; it returns no table, so a lookup cannot change the table |
| Sqlite.DeleteURL | internal/config/storage/sqlite/sqlite.go:100-113 | succeeds whenever the driver calls go through, whether or not a row matched; afterwards no row has the alias and all other rows remain; errors leave the table unchanged; the invariant is preserved |
| Sqlite.FindAppend | internal/config/storage/sqlite/sqlite.go:88 | after one row is appended, a lookup finds the old row if there was one, otherwise the new row if it matches, otherwise nothing |
| Sqlite.FindAfterRemove | internal/config/storage/sqlite/sqlite.go:88 | deleting one alias does not change the lookup of any other alias |
| Sqlite.SaveThenGet | internal/config/storage/sqlite/sqlite.go:46-97 | after a successful `SaveURL(url, alias)`, `GetURL(alias)` returns `url` |
| Sqlite.SaveKeepsOtherAliases | internal/config/storage/sqlite/sqlite.go:59-77 | a save does not change the lookup of any other alias |
| Sqlite.SaveExistingAlias | internal/config/storage/sqlite/sqlite.go:48-57 | a taken alias gives `ErrURLExists` wrapped with the operation name, whatever the url, and the table is unchanged |
| Sqlite.SaveExistingUrl | internal/config/storage/sqlite/sqlite.go:64-68 | a url already stored gives `ErrURLExists` and the table is unchanged |
| Sqlite.ScanFailureIgnored | internal/config/storage/sqlite/sqlite.go:52-68 | when the pre-check scan fails but both insert steps go through, the outcome is the same as with a working scan, because the UNIQUE constraint catches a taken alias |
| Sqlite.ScanFailureSurfacesInsertFault | internal/config/storage/sqlite/sqlite.go:52-69 | when the alias is taken and the scan fails, a failure of the insert's prepare or exec is returned as a wrapped driver error, where a working scan would have given `ErrURLExists`; the table is unchanged |
| Sqlite.DeleteTwice | internal/config/storage/sqlite/sqlite.go:100-112 | after a successful delete the alias is not found, and deleting it again succeeds and changes nothing |
| Sqlite.DeleteKeepsOtherAliases | internal/config/storage/sqlite/sqlite.go:100-112 | a delete does not change the lookup of any other alias |
| ApiResponse.OK | internal/lib/logger/api/response/response.go:20-22 | status "OK", empty error, well-formed |
| ApiResponse.Error | internal/lib/logger/api/response/response.go:24-26 | status "Error", error text exactly the message, well-formed |
| ApiResponse.FieldMessage | internal/lib/logger/api/response/response.go:32-39 | tag "required" gives "field F is a required field", tag "url" gives "field F is not a valid URL", and any other tag gives "field F is not valid" |
| ApiResponse.ParseMessage | internal/lib/logger/api/response/response.go:32-39 | any message it accepts is the field message for the rule and field it returns |
| ApiResponse.ParseFieldMessage | internal/lib/logger/api/response/response.go:32-39 | every field message parses back to its field and its rule ("required", "url", or any other tag), so no two of them coincide |
| ApiResponse.Join | internal/lib/logger/api/response/response.go:44 | `strings.Join` of no pieces is empty; otherwise the joined text is as long as the pieces plus one separator between each neighbouring pair, and it ends with the last piece |
| ApiResponse.JoinPiece | internal/lib/logger/api/response/response.go:44 | the i-th piece appears at its offset in the joined text |
| ApiResponse.JoinSeparator | internal/lib/logger/api/response/response.go:44 | exactly one separator lies between neighbouring pieces |
| ApiResponse.Messages | internal/lib/logger/api/response/response.go:29-39 | one message per failed rule, in input order |
| ApiResponse.ValidationError | internal/lib/logger/api/response/response.go:28-46 | always status "Error"; the text is empty exactly when there are no failed rules |
| ApiResponse.ValidationErrorLists | internal/lib/logger/api/response/response.go:29-44 | the text holds each failed rule's message at its offset, in input order, with ", " between neighbours and nothing else |
| SaveHandler.Route | internal/http-server/handlers/url/save/save.go:41-69 | a body that fails to decode gives "failed to decode request" and a rejected request gives its `ValidationError`, both without a store call; otherwise the store gets the request's url and its non-empty alias unchanged, or the generated alias when it was empty |
| SaveHandler.Respond | internal/http-server/handlers/url/save/save.go:69-96 | `ErrURLExists` gives "url already exists", `ErrAliasExists` gives "alias already exists, please try again", any other error gives "failed to add url", and a success gives status OK with the alias echoed; since an error has one root, checking `ErrURLExists` first never hides an `ErrAliasExists` |
| SaveHandler.RespondSeesOnlyRoot | internal/http-server/handlers/url/save/save.go:70-88 | the reply depends only on the error's root, not on how it was wrapped |
| RedirectHandler.Respond | internal/http-server/handlers/url/redirect/redirect.go:32-50 | `ErrURLNotFound` gives "not found" and any other error gives "internal error", both without a redirect; a url gives a call of `http.Redirect` with exactly that url and status 302 |
| RedirectHandler.RespondSeesOnlyRoot | internal/http-server/handlers/url/redirect/redirect.go:33-45 | the reply depends only on the error's root |
| DeleteHandler.Route | internal/http-server/handlers/delete/deleter.go:36-45 | an empty alias gives "invalid request" without a store call; any other alias goes to the store unchanged |
| DeleteHandler.Respond | internal/http-server/handlers/delete/deleter.go:45-67 | `ErrURLNotFound` gives "not found", any other error gives "internal error", and a success gives status OK echoing the alias and the url the store returned |
| DeleteHandler.RespondSeesOnlyRoot | internal/http-server/handlers/delete/deleter.go:46-58 | the reply depends only on the error's root |
| Service.Save | internal/http-server/handlers/url/save/save.go:41-96 | the save endpoint against the store keeps the invariant; a failure reply leaves the table unchanged; a success reply reports the resolved alias, under which the request's url can now be read back |
| Service.Redirect | internal/http-server/handlers/url/redirect/redirect.go:30-50 | the path alias goes to the store as given; the reply redirects exactly when the alias is stored, calling `http.Redirect` with that alias's url and status 302, and an absent alias gives "not found" |
| Service.SaveThenRedirect | internal/http-server/handlers/url/redirect/redirect.go:32-50 | after a successful save, a redirect on the reported alias calls `http.Redirect` with the saved url and status 302 |
| Service.SaveTakenAlias | internal/http-server/handlers/url/save/save.go:69-76 | saving under a taken alias answers "url already exists" and leaves the table unchanged |
| Service.SaveTwice | internal/config/storage/sqlite/sqlite.go:48-57 | the same request submitted twice succeeds the first time and the second time answers "url already exists" and changes nothing |
| Service.MissingUrlIsNotStored | internal/http-server/handlers/url/save/save_test.go:37-42 | a request whose url fails the "required" rule answers "field URL is a required field" and leaves the table unchanged |
| Service.InvalidUrlIsNotStored | internal/http-server/handlers/url/save/save_test.go:43-48 | a request whose url fails the "url" rule answers "field URL is not a valid URL" and leaves the table unchanged |

## Left out

- Opening the database and creating the schema in `New`: this is I/O. The only thing modelled is the empty, valid table the schema starts with (`Sqlite.Empty`). The `idx_alias` index changes no behaviour.
- Sqlite.SaveURL: does not model a failure of `LastInsertId` (sqlite.go:72-75). The go-sqlite3 driver returns the id it already holds and never fails there.
- Sqlite.NextId: ids are unbounded integers. SQLite's fallback when the largest rowid is already 2^63-1 (it picks a random unused rowid) is not modelled.
- Sqlite.SaveURL: when the insert has an I/O failure and would also violate a UNIQUE constraint, the model reports the I/O failure. Driver error codes are reduced to "unique constraint violated" or a driver failure with a reason.
- The SQL text, prepared statements and the driver itself: replaced by the record table and the per-call `Step` outcomes.
- Concurrency between requests, including the race between the pre-check and the insert. The model takes requests one at a time.
- JSON decoding and encoding, and the validator's URL grammar. Whether the body decoded, and the validator's `(tag, field)` findings, are inputs.
- The random alias generator: `internal/lib/random` is not part of this model. Its output is an input, and nothing is assumed about its length or alphabet.
- The text of the sentinel errors: `internal/config/storage` is not part of this model. The handlers never show error text to clients.
- Logging inside the handlers, the logging middleware (`mwlogger`) and process wiring in `cmd/url-shortener/main.go`.
- The delete handler with the SQLite store. The handler expects `DeleteURL(alias) (string, error)`, but the store's `DeleteURL` returns only an error. The handler is modelled against its own interface, with the store's answer as an input, and is not composed with the store.
- HTTP status codes of JSON replies (always 200), and what `http.Redirect` does with the url it is given. It percent-escapes non-ASCII bytes in the Location header, resolves a url without a scheme against the request path, and writes a short body. The model stops at the url and status passed to `http.Redirect`.
