# go-dadjokes-api: the write path's throttling and the handlers' decisions, in Dafny

The service has two routes. `GET /random` returns one random joke from a
Postgres table. `POST /write` stores a new joke. Every write request first
passes a per-client rate limiter. The limiter keeps a registry of visitors:
one entry per client key, holding the client's token bucket and the time
the client was last seen. A background task sweeps stale entries out of it
every minute.

This project models the following:

- **The visitor registry** (`Visitors.Registry`). It is a class with a
  `map<Key, Visitor>` field.
  - `GetVisitor` is get-or-insert.
  - `Admit` is get-or-insert followed by asking the client's limiter for a token.
  - `CleanupVisitors` is one eviction pass, written as a loop that deletes
    entries from the map.
  - Each method stands for one critical section of the source's mutex.
  - The clock is an integer parameter `now`, in nanoseconds.
  - The key is the raw remote address of the connection, port included, as
    the source uses it.
- **The limiter** (`RateLimit.Limiter`). It is an integer token bucket: a new
  bucket holds 3 tokens, and `Allow` first credits the tokens earned since
  the last call (never beyond 3), then takes one token or denies. It is a
  class because visitors hold it by reference, as the source holds a
  pointer to it. `Run` gives the answers to a burst of immediate requests.
- **The handlers** (`Handlers`). These are pure decisions over abstract
  inputs.
  - The JSON decoder's result is an input (`Decoded`).
  - The database's answers are inputs (`InsertOutcome`, `QueryOutcome`).
  - `Validate` runs the four input checks in their order.
  - `SaveJoke` maps the checks and the insert result to a response, and
    records which insert, if any, it issued.
  - `GetJoke` maps the query result to a response.
  - Author and joke text are byte sequences, because Go's `len` counts bytes.
- **The middleware** (`Middleware`).
  - `RateLimitGate` is the allow/deny branch.
  - `ServeWrite` is the whole `POST /write` path: registry, limiter, then
    the handler.
  - `ImmediateRequests` is the test's scenario: requests from one new client
    with no time passing between them.

Facts about the code that the model keeps:

- A successful write answers 201 with the joke as decoded from the request.
  The row is not read back, so `id` is whatever the body held, 0 when it
  held none.
- `getVisitor` releases the registry's mutex before `Allow` runs, and the
  limiter has its own lock. `Admit` runs both in one step, so interleavings
  are not modelled.
- The key is the raw `RemoteAddr`, port included.
- The limiter regains tokens between requests. How many whole tokens a
  client has earned since its last request is an input, `earned`, to
  `Allow`, `Admit` and `ServeWrite`; `Refill` credits them, capped at 3.

## Model

| member | source | states |
|---|---|---|
| `RateLimit.Run` | dadjokes.go:74 | an immediate burst on a bucket yields one answer per request, and the first answer is "admit" exactly when a token is left |
| `RateLimit.RunAdmitsWhileTokensLast` | dadjokes.go:74 | a bucket holding `t` tokens admits exactly the first `t` requests of an immediate burst and denies every later one |
| `RateLimit.FreshBucketBurst` | dadjokes_test.go:214-237 | a new bucket (burst 3) answers four immediate requests with admit, admit, admit, deny |
| `RateLimit.Refill` | dadjokes.go:74 | crediting earned tokens never takes the bucket above its burst of 3 and never loses tokens it held; the bucket either gains all that was earned or is full, and never gains more than was earned; earning 3 or more refills it completely |
| `RateLimit.Limiter.constructor` | dadjokes.go:74 | a new limiter starts full, with 3 tokens |
| `RateLimit.Limiter.Allow` | dadjokes.go:107 | after crediting the earned tokens, admits exactly when a token is there; an admission uses one token; a denial takes none; the bucket never holds more than 3; with nothing earned it answers as the first step of an immediate burst |
| `Handlers.Validate` | dadjokes.go:145-164 | the first failing check wins, in the order: empty author, author over 255 bytes, empty text, text over 2000 bytes; each error is characterised by its own check failing and every earlier check passing; the result is no error exactly when both fields are non-empty and within their bounds |
| `Handlers.ValidateBounds` | dadjokes.go:150-160 | an author of exactly 255 bytes and a text of exactly 2000 bytes pass; one byte more in either field is refused with that field's error |
| `Handlers.SaveJoke` | dadjokes.go:135-177 | the insert is issued exactly when the body decoded and passed all four checks, with the decoded author and text; a decoding error is a 400 with the decoder's message; a failed check is a 400 with that check's message; a failed insert is a 500 with the generic message; a successful insert is a 201 echoing the decoded joke |
| `Handlers.SaveJokeStatuses` | dadjokes.go:135-177 | the write handler answers only 201, 400 or 500, and 201 exactly when the joke was well formed and the insert succeeded |
| `Handlers.RefusalIgnoresStore` | dadjokes.go:138-166 | when decoding or a check fails, the response does not depend on what the database would have answered |
| `Handlers.GetJoke` | dadjokes.go:116-133 | the status is 200 exactly when a row was found, and the body is then that row; no rows is a 404 with "No jokes found in the database."; any other error is a 500 with the generic message, and the database's error text is not included |
| `Visitors.Touch` | dadjokes.go:72-82 | after a request, the keys are the old keys plus the client; the client's last-seen time is `now`; a known client keeps its limiter, a new one gets the new limiter; every other entry is unchanged |
| `Visitors.Sweep` | dadjokes.go:93-97 | a pass at `now` keeps exactly the entries seen at most three minutes before `now`, so an entry exactly three minutes old survives; kept entries are unchanged and no key is added |
| `Visitors.SweepLater` | dadjokes.go:93-97 | a pass at `t1` followed by a pass at a later `t2` leaves the same registry as the pass at `t2` alone |
| `Visitors.SweepIdempotent` | dadjokes.go:93-97 | two passes at the same time leave the same registry as one |
| `Visitors.TouchedSurvivesSweep` | dadjokes.go:72-97 | a client seen at `t` survives a pass at `now` exactly when `now - t` is at most three minutes |
| `Visitors.TouchKeepsOthersThroughSweep` | dadjokes.go:72-97 | a request from one client never changes whether, or with what entry, another client survives a pass |
| `Visitors.Registry.constructor` | dadjokes.go:34 | the registry starts empty |
| `Visitors.Registry.GetVisitor` | dadjokes.go:68-83 | get-or-insert: the new map is `Touch` of the old one; a new client's limiter is a fresh object holding 3 tokens; a known client's limiter is the same object as before; no bucket's tokens change; no two clients share a limiter afterwards |
| `Visitors.Registry.Admit` | dadjokes.go:105-107 | the client's entry is recorded or refreshed whether or not the request is admitted; the request is admitted exactly when the client's bucket (full, for a new client), after crediting the earned tokens, holds a token; only that client's bucket changes, and an admission takes one token |
| `Visitors.Registry.CleanupVisitors` | dadjokes.go:93-97 | one pass over every entry leaves exactly `Sweep` of the old map; the limiters are untouched |
| `Middleware.RateLimitGate` | dadjokes.go:107-112 | when allowed, the wrapped handler is called exactly once and its response is the answer; when denied, it is not called and the answer is a bodiless 429 |
| `Middleware.DenialIgnoresHandler` | dadjokes.go:107-110 | a denial's response is the same whatever the wrapped handler would have answered, and it has no body |
| `Middleware.ServeWrite` | dadjokes.go:103-114 | a write request refreshes or records its client even when refused; the request is refused exactly when the client's bucket, after crediting the earned tokens, is empty; a refused request answers 429 and issues no insert; an admitted one is answered exactly as `SaveJoke` answers it and takes one token; only the requesting client's bucket changes |
| `Middleware.ImmediateRequests` | dadjokes_test.go:198-237 | `n` requests from one new client at the same instant, in front of a handler answering 200, receive 200 for the first three and 429 for every later one |

## Left out

- How elapsed time turns into tokens (one per second, continuous, with fractional tokens) is left out. It happens inside `golang.org/x/time/rate`, whose source is not part of this model, and it uses floating-point accounting. The model takes the whole tokens earned as the input `earned` and caps the bucket at 3.
- `RateLimit.Limiter.Allow`: a fraction of a token carried over between calls is not modelled; `earned` counts whole tokens only, and nothing ties it to `now`.
- The mutex and the background goroutine are left out: `init`, the endless loop and the one-minute sleep in `cleanupVisitors`. Each registry method is one atomic step. The schedule of passes and the interleaving of concurrent requests are not modelled.
- `Visitors.Registry.CleanupVisitors`: the source reads the clock once per entry, and the model uses one instant `now` for the whole pass.
- `main` is left out: loading `.env`, opening the database, routing and `ListenAndServe` are configuration and I/O.
- JSON encoding and decoding are left out. A decoding failure is an abstract `DecodeError` carrying the decoder's message.
- The SQL text is left out. The database's answers are the abstract inputs `InsertOutcome` and `QueryOutcome`. The random choice of the row belongs to the database.
- The `entry_date` field of a joke is left out.
- Response headers are left out (`Content-Type`), and so is logging (`log.Printf`). Neither changes a status or a body.
- The clock is a parameter and is not read. Time is an integer number of nanoseconds.
