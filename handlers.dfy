/** The two request handlers of the joke service as decisions over abstract
    inputs: what the JSON decoder produced and what the database answered.
    Go strings are byte strings and `len` counts bytes, so author and text
    are byte sequences here. */
module Handlers {

  newtype byte = x: int | 0 <= x < 256
  type Bytes = seq<byte>

  datatype Option<T> = None | Some(value: T)

  const MaxAuthorBytes: nat := 255
  const MaxTextBytes: nat := 2000

  const StatusOK: int := 200
  const StatusCreated: int := 201
  const StatusBadRequest: int := 400
  const StatusNotFound: int := 404
  const StatusTooManyRequests: int := 429
  const StatusInternalServerError: int := 500

  const NoJokesMessage: string := "No jokes found in the database."
  const InternalErrorMessage: string := "An internal server error occurred."

  /** A joke as the handlers see it; the entry date is not modelled. */
  datatype Joke = Joke(id: int, author: Bytes, text: Bytes)

  /** What a handler writes as the response body. */
  datatype Body = NoBody | Message(text: string) | JokeJson(joke: Joke)

  datatype Response = Response(status: int, body: Body)

  /** The four input checks of the write handler, in the order they run. */
  datatype Invalid = AuthorEmpty | AuthorTooLong | TextEmpty | TextTooLong

  function ErrorMessage(e: Invalid): string
  {
    match e
    case AuthorEmpty => "Author cannot be empty."
    case AuthorTooLong => "Author exceeds maximum length of 255 characters."
    case TextEmpty => "Joke text cannot be empty."
    case TextTooLong => "Joke text exceeds maximum length of 2000 characters."
  }

  /** Both bounds hold for both fields. */
  predicate WellFormed(j: Joke)
  {
    0 < |j.author| <= MaxAuthorBytes && 0 < |j.text| <= MaxTextBytes
  }

  /** The first failing check, or None when the joke may be stored. Each
      outcome is characterised on its own: an error is reported exactly when
      its check fails and every earlier check passes. */
  function Validate(j: Joke): (r: Option<Invalid>)
    ensures r == None <==> WellFormed(j)
    ensures r == Some(AuthorEmpty) <==> |j.author| == 0
    ensures r == Some(AuthorTooLong) <==> |j.author| > MaxAuthorBytes
    ensures r == Some(TextEmpty) <==> 0 < |j.author| <= MaxAuthorBytes && |j.text| == 0
    ensures r == Some(TextTooLong) <==> 0 < |j.author| <= MaxAuthorBytes && |j.text| > MaxTextBytes
  {
    if |j.author| == 0 then Some(AuthorEmpty)
    else if |j.author| > MaxAuthorBytes then Some(AuthorTooLong)
    else if |j.text| == 0 then Some(TextEmpty)
    else if |j.text| > MaxTextBytes then Some(TextTooLong)
    else None
  }

  /** A field exactly at its bound passes; one byte more is refused. */
  lemma ValidateBounds(author: Bytes, text: Bytes, id: int)
    requires |author| == MaxAuthorBytes && |text| == MaxTextBytes
    ensures Validate(Joke(id, author, text)) == None
    ensures Validate(Joke(id, author + [0], text)) == Some(AuthorTooLong)
    ensures Validate(Joke(id, author, text + [0])) == Some(TextTooLong)
  {
  }

  /** What the JSON decoder made of the request body. */
  datatype Decoded = Decoded(joke: Joke) | DecodeError(message: string)

  /** What the database answers to the insert, should it be asked. */
  datatype InsertOutcome = Inserted | InsertFailed(err: string)

  /** The insert statement's arguments. */
  datatype Insert = Insert(author: Bytes, text: Bytes)

  /** The response of the write handler, and the insert it issued, if any. */
  datatype SaveResult = SaveResult(response: Response, insert: Option<Insert>)

  function SaveJoke(req: Decoded, store: InsertOutcome): (r: SaveResult)
    // the database is asked exactly when the body decoded and passed every check
    ensures r.insert.Some? <==> req.Decoded? && WellFormed(req.joke)
    ensures r.insert.Some? ==> r.insert.value == Insert(req.joke.author, req.joke.text)
    // a decoding error is a 400 carrying the decoder's own message
    ensures req.DecodeError? ==> r.response == Response(StatusBadRequest, Message(req.message))
    // a failed check is a 400 carrying that check's message
    ensures req.Decoded? && !WellFormed(req.joke) ==>
      r.response.status == StatusBadRequest &&
      r.response.body == Message(ErrorMessage(Validate(req.joke).value))
    // a stored joke is a 201 echoing the decoded joke; a failed insert a generic 500
    ensures r.insert.Some? ==>
      r.response == if store.Inserted? then Response(StatusCreated, JokeJson(req.joke))
                    else Response(StatusInternalServerError, Message(InternalErrorMessage))
  {
    match req
    case DecodeError(msg) => SaveResult(Response(StatusBadRequest, Message(msg)), None)
    case Decoded(joke) =>
      match Validate(joke)
      case Some(e) => SaveResult(Response(StatusBadRequest, Message(ErrorMessage(e))), None)
      case None =>
        var ins := Some(Insert(joke.author, joke.text));
        match store
        case InsertFailed(_) => SaveResult(Response(StatusInternalServerError, Message(InternalErrorMessage)), ins)
        case Inserted => SaveResult(Response(StatusCreated, JokeJson(joke)), ins)
  }

  /** The write handler answers only 201, 400 or 500, and 201 exactly when
      the joke was well formed and the insert succeeded. */
  lemma SaveJokeStatuses(req: Decoded, store: InsertOutcome)
    ensures SaveJoke(req, store).response.status in {StatusCreated, StatusBadRequest, StatusInternalServerError}
    ensures SaveJoke(req, store).response.status == StatusCreated <==>
      req.Decoded? && WellFormed(req.joke) && store.Inserted?
  {
  }

  /** A refused request never depends on the database: whatever the insert
      would have answered, the response is the same. */
  lemma RefusalIgnoresStore(req: Decoded, s1: InsertOutcome, s2: InsertOutcome)
    requires !(req.Decoded? && WellFormed(req.joke))
    ensures SaveJoke(req, s1) == SaveJoke(req, s2)
  {
  }

  /** What the random-row query produced. */
  datatype QueryOutcome = Row(joke: Joke) | NoRows | QueryFailed(err: string)

  function GetJoke(q: QueryOutcome): (r: Response)
    ensures r.status == StatusOK <==> q.Row?
    ensures q.Row? ==> r.body == JokeJson(q.joke)
    ensures q.NoRows? ==> r == Response(StatusNotFound, Message(NoJokesMessage))
    // the database's own error text never reaches the client
    ensures q.QueryFailed? ==> r == Response(StatusInternalServerError, Message(InternalErrorMessage))
  {
    match q
    case Row(joke) => Response(StatusOK, JokeJson(joke))
    case NoRows => Response(StatusNotFound, Message(NoJokesMessage))
    case QueryFailed(_) => Response(StatusInternalServerError, Message(InternalErrorMessage))
  }
}
